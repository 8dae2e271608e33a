/** Where an item lives: the path encoding of store.go, and why it is unambiguous. */
module StorePaths {
  import opened Types
  import opened Paths
  import opened Decimal
  import opened Idents

  /** The part of a store's configuration that decides paths. `bucketOf` may fail, as a hasher may. */
  datatype Config = Config(basePath: string, bucketsName: string, bucketOf: string -> Result<int>)

  /** What the options of options.go guarantee. */
  predicate ValidConfig(cfg: Config) {
    && (cfg.basePath == "" || (Rooted(cfg.basePath) && Clean(cfg.basePath) == cfg.basePath))
    && ValidateNamed(cfg.bucketsName, true).None?
  }

  /** Store.bucketsPath */
  function BucketsPath(cfg: Config, category: string): Result<string> {
    if BaseName(Clean(category)) == cfg.bucketsName then Err(BadCategory)
    else Ok(PathJoin(["/", cfg.basePath, category, cfg.bucketsName]))
  }

  /** Store.identPath */
  function IdentPath(cfg: Config, ident: Ident): Result<string> {
    match cfg.bucketOf(ident.name)
    case Err(e) => Err(e)
    case Ok(bucket) =>
      match BucketsPath(cfg, ident.category)
      case Err(e) => Err(e)
      case Ok(buckets) => Ok(PathJoin([buckets, Itoa(bucket), ident.name, ident.variant]))
  }

  /** An item's name in the store, with its category as segments; the variant "" is the item itself. */
  datatype Key = Key(category: Path, name: string, variant: string) {
    function Parent(): Key {
      this.(variant := "")
    }
  }

  function KeyOf(ident: Ident): Key {
    Key(Segments(ident.category), ident.name, ident.variant)
  }

  function CategoryPath(cfg: Config, category: Path): Path {
    Segments(cfg.basePath) + category + [cfg.bucketsName]
  }

  function Tail(variant: string): Path {
    if variant == "" then [] else [variant]
  }

  /** The znode path of a key: base, category, buckets, bucket number, name and the variant if any. */
  function KeyPath(cfg: Config, key: Key): Path
    requires cfg.bucketOf(key.name).Ok?
  {
    CategoryPath(cfg, key.category) + [Itoa(cfg.bucketOf(key.name).value), key.name] + Tail(key.variant)
  }

  predicate EndsInBuckets(cfg: Config, category: Path) {
    category != [] && category[|category| - 1] == cfg.bucketsName
  }

  /** Validation followed by path construction: the znode an operation on `ident` works on. */
  function Resolve(cfg: Config, ident: Ident): Result<Path> {
    if ValidateIdent(ident).Some? then Err(ValidateIdent(ident).value)
    else match cfg.bucketOf(ident.name)
         case Err(e) => Err(e)
         case Ok(_) =>
           if EndsInBuckets(cfg, Segments(ident.category)) then Err(BadCategory)
           else Ok(KeyPath(cfg, KeyOf(ident)))
  }

  function ResolveCategory(cfg: Config, category: string): Result<Path> {
    if ValidateCategory(category).Some? then Err(ValidateCategory(category).value)
    else if EndsInBuckets(cfg, Segments(category)) then Err(BadCategory)
    else Ok(CategoryPath(cfg, Segments(category)))
  }

  // ---------------------------------------------------------------- strings and segments agree

  lemma BaseSegments(cfg: Config)
    requires ValidConfig(cfg)
    ensures Proper(Segments(cfg.basePath)) && DotFree(Split(cfg.basePath))
    ensures Good(cfg.bucketsName)
  {
    NamedIsGood(cfg.bucketsName, true);
    if cfg.basePath != "" {
      CleanRooted(cfg.basePath);
    } else {
      assert NonEmpty([""]) == [];
    }
  }

  lemma ItoaIsGood(n: int)
    ensures Good(Itoa(n))
  {
    var s := Itoa(n);
    assert forall c :: c in s ==> IsDigit(c) || c == '-';
    assert '.' in "." && '.' in "..";
  }

  /** The string that bucketsPath builds is the rendering of the category's path, or the guard refuses it. */
  lemma BucketsPathAgrees(cfg: Config, category: string)
    requires ValidConfig(cfg) && ValidateCategory(category).None?
    ensures match ResolveCategory(cfg, category)
            case Err(e) => BucketsPath(cfg, category) == Err(e)
            case Ok(p) => Proper(p) && BucketsPath(cfg, category) == Ok(Render(p))
  {
    hide Split;
    hide Segments;
    hide PathJoin;
    hide DotFree;
    hide ValidConfig;
    BaseSegments(cfg);
    CategoryIsSegments(category);
    SegmentsOfGood(cfg.bucketsName);
    SegmentsOfRender([]);
    assert Render([]) == "/";
    JoinFour("/", cfg.basePath, category, cfg.bucketsName);
    assert [] + Segments(cfg.basePath) == Segments(cfg.basePath);
    assert Clean(category) == category;
    if Segments(category) == [] {
      assert BaseName(category) == "/" || BaseName(category) == ".";
    }
  }

  /** The string that identPath builds is the rendering of the key's path, and fails exactly when Resolve does. */
  lemma IdentPathAgrees(cfg: Config, ident: Ident)
    requires ValidConfig(cfg) && ValidateIdent(ident).None?
    ensures match Resolve(cfg, ident)
            case Err(e) => IdentPath(cfg, ident) == Err(e)
            case Ok(p) => Proper(p) && IdentPath(cfg, ident) == Ok(Render(p))
  {
    BucketsPathAgrees(cfg, ident.category);
    if Resolve(cfg, ident).Ok? {
      NamedIsGood(ident.name, true);
      NamedIsGood(ident.variant, false);
      JoinItemPath(cfg, Segments(ident.category), ident.name, ident.variant);
    }
  }

  lemma JoinItemPath(cfg: Config, category: Path, name: string, variant: string)
    requires ValidConfig(cfg) && Proper(category) && Good(name) && (variant == "" || Good(variant))
    requires cfg.bucketOf(name).Ok?
    ensures Proper(KeyPath(cfg, Key(category, name, variant)))
    ensures PathJoin([Render(CategoryPath(cfg, category)), Itoa(cfg.bucketOf(name).value), name, variant])
         == Render(KeyPath(cfg, Key(category, name, variant)))
  {
    hide Split;
    hide Segments;
    hide PathJoin;
    hide Render;
    hide Itoa;
    hide DotFree;
    hide ValidConfig;
    var buckets, number := CategoryPath(cfg, category), Itoa(cfg.bucketOf(name).value);
    BaseSegments(cfg);
    ItoaIsGood(cfg.bucketOf(name).value);
    SegmentsOfRender(buckets);
    SegmentsOfGood(number);
    SegmentsOfGood(name);
    if variant == "" {
      SegmentsOfBlank();
    } else {
      SegmentsOfGood(variant);
    }
    RenderIsRooted(buckets);
    JoinFour(Render(buckets), number, name, variant);
    assert buckets + [number] + [name] + Tail(variant) == KeyPath(cfg, Key(category, name, variant));
  }

  /** A child of an item's node has the path identPath builds for it, valid as a variant or not. */
  lemma VariantPathAgrees(cfg: Config, ident: Ident)
    requires ValidConfig(cfg) && Good(ident.variant) && Resolve(cfg, ident.(variant := "")).Ok?
    ensures var p := Resolve(cfg, ident.(variant := "")).value + [ident.variant];
            Proper(p) && IdentPath(cfg, ident) == Ok(Render(p))
  {
    var category := Segments(ident.category);
    var key := Key(category, ident.name, ident.variant);
    BucketsPathAgrees(cfg, ident.category);
    CategoryIsSegments(ident.category);
    NamedIsGood(ident.name, true);
    JoinItemPath(cfg, category, ident.name, ident.variant);
    assert Tail("") == [] && Tail(ident.variant) == [ident.variant];
    assert KeyPath(cfg, key.Parent()) + [ident.variant] == KeyPath(cfg, key);
  }

  // ---------------------------------------------------------------- the encoding is unambiguous

  /**
   Without the guard on the category's last segment, a key with a variant and a key without one
   could share a path, and this says exactly when: the second key's category is the first one's
   plus the buckets name, and that name and the first key's name both happen to be bucket numbers.
   */
  ghost predicate Collides(cfg: Config, deep: Key, shallow: Key)
    requires cfg.bucketOf(deep.name).Ok? && cfg.bucketOf(shallow.name).Ok?
  {
    && deep.variant == "" && shallow.variant != ""
    && deep.category == shallow.category + [cfg.bucketsName]
    && cfg.bucketsName == Itoa(cfg.bucketOf(shallow.name).value)
    && shallow.name == Itoa(cfg.bucketOf(deep.name).value)
    && deep.name == shallow.variant
  }

  /** How a key's path reads from the end of its category on. */
  lemma KeyPathParts(cfg: Config, key: Key)
    requires cfg.bucketOf(key.name).Ok?
    ensures var p, n := KeyPath(cfg, key), |Segments(cfg.basePath)| + |key.category|;
            && |p| == n + 3 + |Tail(key.variant)|
            && p[..|Segments(cfg.basePath)|] == Segments(cfg.basePath)
            && p[|Segments(cfg.basePath)|..n] == key.category
            && p[n] == cfg.bucketsName && p[n + 1] == Itoa(cfg.bucketOf(key.name).value) && p[n + 2] == key.name
            && (key.variant != "" ==> p[n + 3] == key.variant)
            && p[..n + 1] == CategoryPath(cfg, key.category)
  {
    var p, n := KeyPath(cfg, key), |Segments(cfg.basePath)| + |key.category|;
    assert CategoryPath(cfg, key.category)[n] == cfg.bucketsName;
    assert p == CategoryPath(cfg, key.category) + ([Itoa(cfg.bucketOf(key.name).value), key.name] + Tail(key.variant));
  }

  lemma SamePathIff(cfg: Config, a: Key, b: Key)
    requires cfg.bucketOf(a.name).Ok? && cfg.bucketOf(b.name).Ok?
    ensures KeyPath(cfg, a) == KeyPath(cfg, b) <==> a == b || Collides(cfg, a, b) || Collides(cfg, b, a)
  {
    hide KeyPath;
    KeyPathParts(cfg, a);
    KeyPathParts(cfg, b);
    if KeyPath(cfg, a) == KeyPath(cfg, b) {
      if |a.category| > |b.category| {
        DeeperCollides(cfg, a, b);
      } else if |a.category| < |b.category| {
        DeeperCollides(cfg, b, a);
      }
    }
    if Collides(cfg, a, b) {
      CollidersMeet(cfg, a, b);
    }
    if Collides(cfg, b, a) {
      CollidersMeet(cfg, b, a);
    }
  }

  lemma CollidersMeet(cfg: Config, deep: Key, shallow: Key)
    requires cfg.bucketOf(deep.name).Ok? && cfg.bucketOf(shallow.name).Ok? && Collides(cfg, deep, shallow)
    ensures KeyPath(cfg, deep) == KeyPath(cfg, shallow)
  {
    var c, name := CategoryPath(cfg, shallow.category), cfg.bucketsName;
    assert CategoryPath(cfg, deep.category) == c + [name];
    assert KeyPath(cfg, deep) == c + [name, shallow.name, deep.name];
    assert KeyPath(cfg, shallow) == c + [name, shallow.name, deep.name];
  }

  lemma DeeperCollides(cfg: Config, deep: Key, shallow: Key)
    requires cfg.bucketOf(deep.name).Ok? && cfg.bucketOf(shallow.name).Ok?
    requires KeyPath(cfg, deep) == KeyPath(cfg, shallow) && |deep.category| > |shallow.category|
    ensures Collides(cfg, deep, shallow)
  {
    hide KeyPath;
    KeyPathParts(cfg, deep);
    KeyPathParts(cfg, shallow);
    var p, base := KeyPath(cfg, deep), Segments(cfg.basePath);
    var n := |base| + |shallow.category|;
    assert p[|base|..n + 1] == p[|base|..n] + [p[n]];
  }

  lemma ResolvesToKey(cfg: Config, ident: Ident)
    requires Resolve(cfg, ident).Ok?
    ensures cfg.bucketOf(ident.name).Ok? && Resolve(cfg, ident).value == KeyPath(cfg, KeyOf(ident))
  {
  }

  /**
   The path encoding is injective: two identifiers the store accepts have the same path string
   exactly when they agree on category (up to a leading slash), name and variant.
   */
  lemma PathInjective(cfg: Config, a: Ident, b: Ident)
    requires ValidConfig(cfg)
    requires ValidateIdent(a).None? && ValidateIdent(b).None?
    requires IdentPath(cfg, a).Ok? && IdentPath(cfg, b).Ok?
    ensures IdentPath(cfg, a) == IdentPath(cfg, b) <==>
            TrimSlash(a.category) == TrimSlash(b.category) && a.name == b.name && a.variant == b.variant
  {
    hide IdentPath;
    hide KeyPath;
    hide Segments;
    hide Render;
    hide TrimSlash;
    IdentPathAgrees(cfg, a);
    IdentPathAgrees(cfg, b);
    SameSegments(a.category, b.category);
    SamePathIff(cfg, KeyOf(a), KeyOf(b));
    if IdentPath(cfg, a) == IdentPath(cfg, b) {
      RenderInjective(Resolve(cfg, a).value, Resolve(cfg, b).value);
    }
  }

  /** The guard is needed: with a numeric buckets name, two distinct unguarded keys meet in one path. */
  lemma GuardIsNeeded(cfg: Config)
    requires cfg.bucketsName == "0" && cfg.bucketOf("0") == Ok(0) && cfg.bucketOf("v") == Ok(0)
    ensures var shallow, deep := Key(["a"], "0", "v"), Key(["a", "0"], "v", "");
            shallow != deep && KeyPath(cfg, shallow) == KeyPath(cfg, deep) && EndsInBuckets(cfg, deep.category)
  {
    SamePathIff(cfg, Key(["a", "0"], "v", ""), Key(["a"], "0", "v"));
    assert ["a"] + ["0"] == ["a", "0"];
  }
}
