/**
 The store as its callers may think of it: a plain map from keys to data and versions, plus the set
 of categories that have been written to.
 */
module PlainMaps {
  import opened Types
  import opened Paths
  import opened Idents
  import opened ZkTree
  import opened StorePaths
  import opened StoreSpec

  datatype Plain = Plain(items: map<Key, Znode>, categories: set<Path>)

  const NOTHING_STORED: Plain := Plain(map[], {})

  // ---------------------------------------------------------------- operations on the plain map

  /** A write to an absent key touches its category and supplies a variant's missing item. */
  function Touched(m: Plain, key: Key, data: Bytes): Plain {
    Plain(if key.variant != "" && key.Parent() !in m.items then m.items[key.Parent() := Znode(data, 0)] else m.items,
          m.categories + {key.category})
  }

  function PlainPut(m: Plain, key: Key, version: Version, data: Bytes): (Plain, Result<int>) {
    if key in m.items then
      var current := m.items[key].version;
      if version == Unset || (version == At(current) && current != NO_PRIOR_VERSION)
      then (m.(items := m.items[key := Znode(data, current + 1)]), Ok(current + 1))
      else (m, Err(VersionConflict))
    else
      var touched := Touched(m, key, data);
      if version.At? && version.number >= 0 then (touched, Err(VersionConflict))
      else (touched.(items := touched.items[key := Znode(data, 0)]), Ok(0))
  }

  function VariantsOf(m: Plain, item: Key): set<string> {
    set k | k in m.items && k.variant != "" && k.Parent() == item :: k.variant
  }

  function PlainDelete(m: Plain, key: Key, version: int): (Plain, Option<Error>) {
    if key !in m.items then (m, None)
    else
      var rest := if key.variant != "" then m.items
                  else map k | k in m.items && (k.variant == "" || k.Parent() != key) :: m.items[k];
      if version == -1 || version == m.items[key].version then (m.(items := rest - {key}), None)
      else (m.(items := rest), Some(VersionConflict))
  }

  function NamesIn(m: Plain, category: Path): set<string> {
    set k | k in m.items && k.category == category && k.variant == "" :: k.name
  }

  // ---------------------------------------------------------------- steps and runs

  datatype Op =
    | Put(item: Item)
    | Get(ident: Ident)
    | Variants(location: Location)
    | Delete(ident: Ident)
    | List(category: string)
  {
    function Category(): string {
      match this
      case Put(item) => item.ident.category
      case Get(ident) => ident.category
      case Variants(location) => location.category
      case Delete(ident) => ident.category
      case List(category) => category
    }
  }

  datatype Out =
    | Stored(ident: Result<Ident>)
    | Fetched(item: Result<Item>)
    | Names(names: Result<seq<string>>)
    | Removed(failure: Option<Error>)

  /** One operation of the store on the znode tree, as the methods of class Store perform it. */
  ghost predicate Step(cfg: Config, t: Tree, op: Op, t': Tree, out: Out) {
    match op
    case Put(item) => out.Stored? && (t', out.ident) == PutStep(cfg, t, item)
    case Get(ident) => t' == t && out == Fetched(GetResult(cfg, t, ident))
    case Variants(l) => t' == t && out.Names? && VariantsResult(cfg, t, l.category, l.name, out.names)
    case Delete(ident) => out.Removed? && DeleteStep(cfg, t, ident, t', out.failure)
    case List(category) => t' == t && out.Names? && ListResult(cfg, t, category, out.names)
  }

  /** The same on the plain map. Names come back as a set, since ZooKeeper promises no order. */
  datatype PlainOut =
    | PlainStored(ident: Result<Ident>)
    | PlainFetched(item: Result<Item>)
    | PlainNames(names: Result<set<string>>)
    | PlainRemoved(failure: Option<Error>)

  function PlainStep(cfg: Config, m: Plain, op: Op): (Plain, PlainOut) {
    match op
    case Put(item) =>
      if ValidateItem(item).Some? then (m, PlainStored(Err(ValidateItem(item).value)))
      else (match Resolve(cfg, item.ident)
            case Err(e) => (m, PlainStored(Err(e)))
            case Ok(_) =>
              var (m', r) := PlainPut(m, KeyOf(item.ident), item.ident.version, item.data);
              (m', PlainStored(match r case Err(e) => Err(e) case Ok(v) => Ok(item.ident.(version := At(v))))))
    case Get(ident) =>
      (match Resolve(cfg, ident)
       case Err(e) => (m, PlainFetched(Err(e)))
       case Ok(_) =>
         var key := KeyOf(ident);
         (m, PlainFetched(if key in m.items
                          then Ok(Item(ident.(version := At(m.items[key].version)), m.items[key].data))
                          else Err(NotFound))))
    case Variants(l) =>
      (match Resolve(cfg, ItemIdent(l.category, l.name))
       case Err(e) => (m, PlainNames(Err(e)))
       case Ok(_) =>
         var key := KeyOf(ItemIdent(l.category, l.name));
         (m, PlainNames(if key in m.items then Ok(VariantsOf(m, key)) else Err(NotFound))))
    case Delete(ident) =>
      (match Resolve(cfg, ident)
       case Err(e) => (m, PlainRemoved(if e == NotFound && ident.variant == "" then None else Some(e)))
       case Ok(_) =>
         var (m', f) := PlainDelete(m, KeyOf(ident), ident.ActualVersion());
         (m', PlainRemoved(f)))
    case List(category) =>
      (match ResolveCategory(cfg, category)
       case Err(e) => (m, PlainNames(Err(e)))
       case Ok(_) =>
         var c := Segments(category);
         (m, PlainNames(if c in m.categories then Ok(NamesIn(m, c)) else Err(NotFound))))
  }

  ghost predicate Agree(out: Out, plain: PlainOut) {
    match plain
    case PlainStored(r) => out == Stored(r)
    case PlainFetched(r) => out == Fetched(r)
    case PlainRemoved(f) => out == Removed(f)
    case PlainNames(Err(e)) => out == Names(Err(e))
    case PlainNames(Ok(names)) => out.Names? && out.names.Ok? && Listing(out.names.value, names)
  }
}
