/** What names an item in the store, and the checks a name must pass (ident.go, location.go, item.go, validate.go). */
module Idents {
  import opened Types
  import opened Paths

  const MAX_DATA_SIZE: nat := 1024 * 1024

  const NO_PRIOR_VERSION: int := -1

  /** An optional znode version. */
  datatype Version = Unset | At(number: int)

  datatype Location = Location(category: string, name: string)

  datatype Ident = Ident(category: string, name: string, variant: string, version: Version) {
    /** The version as ZooKeeper takes it: -1 matches any version. */
    function ActualVersion(): int {
      match version
      case Unset => -1
      case At(n) => n
    }

    /** The version is explicitly NO_PRIOR_VERSION: the item must not exist yet. */
    predicate CreatingNew() {
      version == At(NO_PRIOR_VERSION)
    }
  }

  datatype Item = Item(ident: Ident, data: Bytes)

  /** unicode.IsSpace */
  predicate IsSpace(c: char) {
    || '\U{0009}' <= c <= '\U{000D}' || c == ' ' || c == '\U{0085}' || c == '\U{00A0}' || c == '\U{1680}'
    || '\U{2000}' <= c <= '\U{200A}' || c == '\U{2028}' || c == '\U{2029}' || c == '\U{202F}'
    || c == '\U{205F}' || c == '\U{3000}'
  }

  predicate NameChar(c: char) {
    'a' <= c <= 'z' || 'A' <= c <= 'Z' || '0' <= c <= '9' || c == '_' || c == '-'
  }

  predicate CategoryChar(c: char) {
    NameChar(c) || c == '/'
  }

  function ValidateNamed(name: string, required: bool): Option<Error> {
    if name != "" && (IsSpace(name[0]) || IsSpace(name[|name| - 1])) then Some(OuterSpaces)
    else if name == "" then if required then Some(Blank) else None
    else if exists c :: c in name && !NameChar(c) then Some(BadCharacters)
    else None
  }

  function ValidateCategory(name: string): Option<Error> {
    if forall c :: c in name ==> IsSpace(c) then Some(BadCategory)
    else if exists c :: c in name && !CategoryChar(c) then Some(BadCharacters)
    else if Clean(name) != name then Some(BadCategory)
    else None
  }

  function ValidateLocation(category: string, name: string): Option<Error> {
    if ValidateNamed(name, true).Some? then ValidateNamed(name, true) else ValidateCategory(category)
  }

  function ValidateIdent(ident: Ident): Option<Error> {
    var location := ValidateLocation(ident.category, ident.name);
    if location.Some? then location else ValidateNamed(ident.variant, false)
  }

  function ValidateItem(item: Item): Option<Error> {
    var ident := ValidateIdent(item.ident);
    if ident.Some? then ident else if |item.data| > MAX_DATA_SIZE then Some(DataTooLarge) else None
  }

  /** The part of a category that its leading slash does not change. */
  function TrimSlash(category: string): string {
    if Rooted(category) then category[1..] else category
  }

  /** A name passes exactly when it is made of name characters, or blank where that is allowed. */
  lemma ValidNameIff(name: string, required: bool)
    ensures ValidateNamed(name, required).None? <==>
            (name == "" && !required) || (name != "" && forall c :: c in name ==> NameChar(c))
  {
    assert forall c :: NameChar(c) ==> !IsSpace(c);
  }

  /** The name characters are the letters and digits of ASCII, the underscore (95) and the hyphen (45). */
  lemma NameCharIff(c: char)
    ensures NameChar(c) <==> var i := c as int; 65 <= i <= 90 || 97 <= i <= 122 || 48 <= i <= 57 || i == 95 || i == 45
  {
  }

  /** White space, by code point; a name is refused for it exactly if it begins or ends with some. */
  lemma OuterSpaceIff(name: string, required: bool)
    ensures forall c :: IsSpace(c) <==>
              var i := c as int;
              i in {9, 10, 11, 12, 13, 32, 133, 160, 5760, 8232, 8233, 8239, 8287, 12288} || 8192 <= i <= 8202
    ensures ValidateNamed(name, required) == Some(OuterSpaces) <==>
            name != "" && (IsSpace(name[0]) || IsSpace(name[|name| - 1]))
    ensures ValidateNamed(name, required) == Some(Blank) <==> name == "" && required
  {
  }

  /** An item passes exactly when its category, name and variant do and its data is at most a megabyte. */
  lemma ValidItemIff(item: Item)
    ensures ValidateItem(item).None? <==>
            && ValidateNamed(item.ident.name, true).None? && ValidateCategory(item.ident.category).None?
            && ValidateNamed(item.ident.variant, false).None? && |item.data| <= 1_048_576
    ensures ValidateIdent(item.ident).None? && |item.data| > 1_048_576 ==> ValidateItem(item) == Some(DataTooLarge)
    ensures ValidateIdent(item.ident).Some? ==> ValidateItem(item) == ValidateIdent(item.ident)
  {
  }

  /** A name that passes validation is blank where that is allowed, or is a znode segment of its own. */
  lemma NamedIsGood(name: string, required: bool)
    requires ValidateNamed(name, required).None?
    ensures name != "" ==> Good(name)
    ensures required ==> name != ""
  {
    assert !NameChar('/') && !NameChar('.');
    assert '.' in "." && '.' in "..";
  }

  lemma {:induction false} SplitChars(s: string)
    ensures forall segment, c :: segment in Split(s) && c in segment ==> c in s
  {
    if s != "" {
      SplitChars(s[1..]);
      forall segment, c | segment in Split(s) && c in segment ensures c in s {
        var rest := Split(s[1..]);
        if segment !in rest {
          assert segment == [s[0]] + rest[0];
          assert rest[0] in rest;
          assert c in rest[0] ==> c in s[1..];
        } else {
          assert c in s[1..];
        }
      }
    }
  }

  /** A category that passes validation is the slash-separated list of its segments, up to a leading slash. */
  lemma CategoryIsSegments(category: string)
    requires ValidateCategory(category).None?
    ensures Proper(Segments(category)) && DotFree(Split(category))
    ensures TrimSlash(category) == Joined(Segments(category))
  {
    SplitChars(category);
    assert DotFree(Split(category)) by {
      assert '.' !in category by { assert !CategoryChar('.'); }
      assert '.' in "." && '.' in "..";
    }
    CleanDotFree(category);
    if Rooted(category) {
      assert ("/" + Joined(Segments(category)))[1..] == Joined(Segments(category));
    } else {
      assert "" + Joined(Segments(category)) == Joined(Segments(category));
    }
  }

  /** A category passes exactly when it is "/" or slash-separated non-empty names, perhaps after one slash. */
  lemma ValidCategoryIff(category: string)
    ensures ValidateCategory(category).None? <==>
            && (forall c :: c in category ==> CategoryChar(c))
            && (category == "/" || (TrimSlash(category) != "" && "" !in Split(TrimSlash(category))))
  {
    var rest := TrimSlash(category);
    if ValidateCategory(category).None? {
      CategoryIsSegments(category);
      if Segments(category) != [] {
        SplitJoined(Segments(category));
        assert Good(Segments(category)[0]);
        assert rest != "";
      }
    }
    if (forall c :: c in category ==> CategoryChar(c)) && category != "" {
      assert CategoryChar(category[0]) && !IsSpace(category[0]);
      if category == "/" || (rest != "" && "" !in Split(rest)) {
        CleanIsItself(category);
      }
    }
  }

  lemma CleanIsItself(category: string)
    requires forall c :: c in category ==> CategoryChar(c)
    requires category == "/" || (TrimSlash(category) != "" && "" !in Split(TrimSlash(category)))
    ensures Clean(category) == category
  {
    var rest := TrimSlash(category);
    SplitChars(category);
    assert DotFree(Split(category)) by {
      assert '.' !in category by { assert !CategoryChar('.'); }
      assert '.' in "." && '.' in "..";
    }
    ReduceDotFree([], Split(category), Rooted(category));
    assert [] + Segments(category) == Segments(category);
    JoinedSplit(rest);
    if Rooted(category) {
      assert category == "" + "/" + rest;
      SplitAppend("", rest);
      NonEmptyAppend([""], Split(rest));
      assert NonEmpty([""]) == [];
    }
    if category != "/" {
      NonEmptyKeeps(Split(rest));
    }
  }

  /** Two valid categories agree up to a leading slash exactly when they have the same segments. */
  lemma SameSegments(a: string, b: string)
    requires ValidateCategory(a).None? && ValidateCategory(b).None?
    ensures TrimSlash(a) == TrimSlash(b) <==> Segments(a) == Segments(b)
  {
    CategoryIsSegments(a);
    CategoryIsSegments(b);
    if TrimSlash(a) == TrimSlash(b) {
      RenderInjective(Segments(a), Segments(b));
    }
  }
}
