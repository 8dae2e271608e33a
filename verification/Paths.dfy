/**
 Slash-separated paths: the functions of Go's `strings` and `path` packages from which the
 store and the elector build znode paths, and the znode path as a sequence of segments.
 */
module Paths {
  import opened Types

  type Path = seq<string>

  /** strings.Split(s, "/") */
  function Split(s: string): (segments: seq<string>)
    ensures |segments| > 0
  {
    if s == "" then [""] else Push(s[0], Split(s[1..]))
  }

  /** Puts one more character in front of a split string. */
  function Push(c: char, segments: seq<string>): (pushed: seq<string>)
    requires |segments| > 0
    ensures |pushed| > 0
  {
    if c == '/' then [""] + segments else [[c] + segments[0]] + segments[1..]
  }

  /** strings.Join(parts, "/") */
  function Joined(parts: seq<string>): string {
    if parts == [] then ""
    else if |parts| == 1 then parts[0]
    else parts[0] + "/" + Joined(parts[1..])
  }

  function NonEmpty(segments: seq<string>): seq<string> {
    if segments == [] then []
    else if segments[0] == "" then NonEmpty(segments[1..])
    else [segments[0]] + NonEmpty(segments[1..])
  }

  /** The non-empty segments of a slash-separated string. */
  function Segments(s: string): seq<string> {
    NonEmpty(Split(s))
  }

  /** A segment that names one znode. */
  predicate Good(segment: string) {
    segment != "" && '/' !in segment && segment != "." && segment != ".."
  }

  predicate Proper(path: Path) {
    forall segment :: segment in path ==> Good(segment)
  }

  predicate DotFree(segments: seq<string>) {
    "." !in segments && ".." !in segments
  }

  /** The absolute path string of a sequence of segments. */
  function Render(path: Path): string {
    "/" + Joined(path)
  }

  /** How ZooKeeper reads a path string: absolute, no empty or dot segment, no trailing slash. Its refusal of
      control characters is left aside. */
  function Parse(s: string): Option<Path> {
    if s == "/" then Some([])
    else if |s| > 1 && s[0] == '/' && Proper(Split(s[1..])) then Some(Split(s[1..]))
    else None
  }

  /** The lexical processing of path.Clean, with `stack` holding the segments kept so far. */
  function Reduce(stack: seq<string>, segments: seq<string>, rooted: bool): seq<string>
    decreases |segments|
  {
    if segments == [] then stack
    else
      var s, rest := segments[0], segments[1..];
      if s == "" || s == "." then Reduce(stack, rest, rooted)
      else if s != ".." then Reduce(stack + [s], rest, rooted)
      else if stack != [] && stack[|stack| - 1] != ".." then Reduce(stack[..|stack| - 1], rest, rooted)
      else if rooted then Reduce(stack, rest, rooted)
      else Reduce(stack + [s], rest, rooted)
  }

  predicate Rooted(s: string) {
    s != "" && s[0] == '/'
  }

  /** path.Clean(s) */
  function Clean(s: string): string {
    var body := Joined(Reduce([], Split(s), Rooted(s)));
    if Rooted(s) then "/" + body else if body == "" then "." else body
  }

  /** path.Join(parts...) */
  function PathJoin(parts: seq<string>): string {
    if parts == [] then ""
    else if parts[0] == "" then PathJoin(parts[1..])
    else Clean(Joined(parts))
  }

  /** path.Base(s) */
  function BaseName(s: string): string {
    var segments := Segments(s);
    if s == "" then "." else if segments == [] then "/" else segments[|segments| - 1]
  }

  function Flat(parts: seq<string>): seq<string> {
    if parts == [] then [] else Segments(parts[0]) + Flat(parts[1..])
  }

  // ---------------------------------------------------------------- splitting and joining

  lemma {:induction false} SplitPlain(s: string)
    requires '/' !in s
    ensures Split(s) == [s]
  {
    if s != "" {
      SplitPlain(s[1..]);
      assert s == [s[0]] + s[1..];
    }
  }

  lemma PushAppend(c: char, a: seq<string>, b: seq<string>)
    requires |a| > 0
    ensures Push(c, a + b) == Push(c, a) + b
  {
    assert (a + b)[1..] == a[1..] + b;
  }

  lemma {:induction false} SplitAppend(a: string, b: string)
    ensures Split(a + "/" + b) == Split(a) + Split(b)
  {
    var s := a + "/" + b;
    if a == "" {
      assert s[1..] == b;
    } else {
      assert s[1..] == a[1..] + "/" + b && s[0] == a[0];
      SplitAppend(a[1..], b);
      PushAppend(a[0], Split(a[1..]), Split(b));
    }
  }

  lemma {:induction false} SplitJoined(segments: seq<string>)
    requires segments != []
    requires forall s :: s in segments ==> '/' !in s
    ensures Split(Joined(segments)) == segments
  {
    SplitPlain(segments[0]);
    if |segments| > 1 {
      SplitJoined(segments[1..]);
      SplitAppend(segments[0], Joined(segments[1..]));
    }
  }

  lemma {:induction false} JoinedSplit(s: string)
    ensures Joined(Split(s)) == s
    ensures forall segment :: segment in Split(s) ==> '/' !in segment
  {
    if s != "" {
      JoinedSplit(s[1..]);
      var rest := Split(s[1..]);
      assert s == [s[0]] + s[1..];
      if s[0] == '/' {
        assert ([""] + rest)[1..] == rest;
      } else {
        assert ([[s[0]] + rest[0]] + rest[1..])[1..] == rest[1..];
      }
    }
  }

  /** A znode path survives being written as a string and read back ... */
  lemma ParseRender(path: Path)
    requires Proper(path)
    ensures Parse(Render(path)) == Some(path)
  {
    if path != [] {
      SplitJoined(path);
      assert Render(path)[1..] == Joined(path);
      assert Good(path[0]);
    }
  }

  /** ... and so does a path string that ZooKeeper accepts. */
  lemma RenderParse(s: string)
    requires Parse(s).Some?
    ensures Render(Parse(s).value) == s
    ensures Proper(Parse(s).value)
  {
    if s != "/" {
      JoinedSplit(s[1..]);
      assert s == "/" + s[1..];
    }
  }

  lemma RenderInjective(p: Path, q: Path)
    requires Proper(p) && Proper(q)
    requires Render(p) == Render(q)
    ensures p == q
  {
    ParseRender(p);
    ParseRender(q);
  }

  // ---------------------------------------------------------------- segments

  lemma {:induction false} NonEmptyAppend(a: seq<string>, b: seq<string>)
    ensures NonEmpty(a + b) == NonEmpty(a) + NonEmpty(b)
  {
    if a == [] {
      assert a + b == b;
    } else {
      assert (a + b)[1..] == a[1..] + b;
      NonEmptyAppend(a[1..], b);
    }
  }

  lemma {:induction false} NonEmptyKeeps(segments: seq<string>)
    requires "" !in segments
    ensures NonEmpty(segments) == segments
  {
    if segments != [] {
      NonEmptyKeeps(segments[1..]);
    }
  }

  lemma {:induction false} NonEmptyMembers(segments: seq<string>)
    ensures forall s :: s in NonEmpty(segments) <==> s in segments && s != ""
  {
    if segments != [] {
      NonEmptyMembers(segments[1..]);
    }
  }

  lemma SegmentsOfGood(segment: string)
    requires Good(segment)
    ensures Segments(segment) == [segment] && DotFree(Split(segment))
  {
    SplitPlain(segment);
    assert Split(segment)[0] == segment;
    NonEmptyKeeps([segment]);
  }

  lemma SegmentsOfBlank()
    ensures Segments("") == [] && DotFree(Split(""))
  {
    assert NonEmpty([""]) == [];
  }

  lemma RenderIsRooted(path: Path)
    ensures Rooted(Render(path))
  {
  }

  lemma SegmentsOfRender(path: Path)
    requires Proper(path)
    ensures Segments(Render(path)) == path && DotFree(Split(Render(path)))
  {
    SplitAppend("", Joined(path));
    assert "" + "/" + Joined(path) == Render(path);
    NonEmptyAppend(Split(""), Split(Joined(path)));
    if path != [] {
      SplitJoined(path);
      NonEmptyKeeps(path);
      assert NonEmpty([""]) == [];
    }
  }

  lemma {:induction false} SegmentsOfJoined(parts: seq<string>)
    requires parts != []
    requires forall part :: part in parts ==> DotFree(Split(part))
    ensures Segments(Joined(parts)) == Flat(parts)
    ensures DotFree(Split(Joined(parts)))
  {
    if |parts| > 1 {
      SegmentsOfJoined(parts[1..]);
      SplitAppend(parts[0], Joined(parts[1..]));
      NonEmptyAppend(Split(parts[0]), Split(Joined(parts[1..])));
    } else {
      assert Flat(parts[1..]) == [];
    }
  }

  // ---------------------------------------------------------------- path.Clean and path.Join

  /** Without dot segments path.Clean only drops the empty segments. */
  lemma {:induction false} ReduceDotFree(stack: seq<string>, segments: seq<string>, rooted: bool)
    requires DotFree(segments)
    ensures Reduce(stack, segments, rooted) == stack + NonEmpty(segments)
    decreases |segments|
  {
    if segments != [] {
      if segments[0] == "" {
        ReduceDotFree(stack, segments[1..], rooted);
      } else {
        ReduceDotFree(stack + [segments[0]], segments[1..], rooted);
      }
    }
  }

  lemma {:induction false} ReduceRootedIsProper(stack: seq<string>, segments: seq<string>)
    requires Proper(stack)
    requires forall s :: s in segments ==> '/' !in s
    ensures Proper(Reduce(stack, segments, true))
    decreases |segments|
  {
    if segments != [] {
      var s, rest := segments[0], segments[1..];
      if s == "" || s == "." {
        ReduceRootedIsProper(stack, rest);
      } else if s != ".." {
        ReduceRootedIsProper(stack + [s], rest);
      } else if stack != [] && stack[|stack| - 1] != ".." {
        ReduceRootedIsProper(stack[..|stack| - 1], rest);
      } else {
        ReduceRootedIsProper(stack, rest);
      }
    }
  }

  /** Joining dot-free parts under an absolute first part concatenates their segments. */
  lemma JoinRooted(parts: seq<string>)
    requires parts != [] && Rooted(parts[0])
    requires forall part :: part in parts ==> DotFree(Split(part))
    ensures PathJoin(parts) == Render(Flat(parts))
  {
    SegmentsOfJoined(parts);
    ReduceDotFree([], Split(Joined(parts)), true);
    assert [] + Flat(parts) == Flat(parts);
  }

  lemma JoinFour(a: string, b: string, c: string, d: string)
    requires Rooted(a)
    requires DotFree(Split(a)) && DotFree(Split(b)) && DotFree(Split(c)) && DotFree(Split(d))
    ensures PathJoin([a, b, c, d]) == Render(Segments(a) + Segments(b) + Segments(c) + Segments(d))
  {
    hide Split;
    hide Segments;
    hide PathJoin;
    hide Render;
    hide DotFree;
    JoinRooted([a, b, c, d]);
    FlatThree(b, c, d);
    assert [a, b, c, d][1..] == [b, c, d];
    assert Flat([a, b, c, d]) == Segments(a) + Segments(b) + Segments(c) + Segments(d);
  }

  lemma FlatThree(b: string, c: string, d: string)
    ensures Flat([b, c, d]) == Segments(b) + Segments(c) + Segments(d)
  {
    hide Segments;
    assert [b, c, d][1..] == [c, d] && [c, d][1..] == [d];
    assert Flat([d]) == Segments(d) + Flat([]) == Segments(d);
    assert Flat([c, d]) == Segments(c) + Segments(d);
  }

  lemma JoinTwo(a: string, b: string)
    requires Rooted(a) && DotFree(Split(a)) && DotFree(Split(b))
    ensures PathJoin([a, b]) == Render(Segments(a) + Segments(b))
  {
    JoinRooted([a, b]);
    assert [a, b][1..] == [b];
    assert Flat([b]) == Segments(b) + Flat([]) == Segments(b);
  }

  /** Walking down a rendered path one split segment at a time. */
  lemma SplitRender(path: Path)
    requires Proper(path) && path != []
    ensures Split(Render(path)) == [""] + path
  {
    SplitAppend("", Joined(path));
    assert "" + "/" + Joined(path) == Render(path);
    SplitJoined(path);
  }

  lemma JoinChild(path: Path, child: string)
    requires Proper(path) && Good(child)
    ensures PathJoin([Render(path), child]) == Render(path + [child])
  {
    SegmentsOfRender(path);
    SegmentsOfGood(child);
    JoinTwo(Render(path), child);
  }

  lemma JoinRootBlank()
    ensures PathJoin(["/", ""]) == "/"
  {
    SegmentsOfRender([]);
    assert Render([]) == "/" && Segments("") == [] && DotFree(Split(""));
    JoinTwo("/", "");
    assert Render([]) == "/";
  }

  /** One step down the path: the i-th split segment joined to what came before. */
  method Descend(current: string, segment: string, ghost p: Path, ghost i: nat) returns (next: string)
    requires Proper(p) && i <= |p| && segment == ([""] + p)[i]
    requires current == if i == 0 then "/" else Render(p[..i - 1])
    ensures next == Render(p[..i]) && Parse(next) == Some(p[..i])
  {
    next := PathJoin([current, segment]);
    if i == 0 {
      JoinRootBlank();
      assert p[..0] == [] && Render([]) == "/";
    } else {
      JoinChild(p[..i - 1], p[i - 1]);
      assert p[..i] == p[..i - 1] + [p[i - 1]];
    }
    ParseRender(p[..i]);
  }

  /** A cleaned absolute path is the rendering of its own segments. */
  lemma CleanRooted(s: string)
    requires Rooted(s) && Clean(s) == s
    ensures Proper(Segments(s)) && s == Render(Segments(s)) && DotFree(Split(s))
  {
    JoinedSplit(s);
    var path := Reduce([], Split(s), true);
    ReduceRootedIsProper([], Split(s));
    assert s == Render(path);
    SegmentsOfRender(path);
  }

  /** A cleaned dot-free string is its own segments, with or without the leading slash. */
  lemma CleanDotFree(s: string)
    requires s != "" && DotFree(Split(s)) && Clean(s) == s
    ensures Proper(Segments(s))
    ensures s == (if Rooted(s) then "/" else "") + Joined(Segments(s))
  {
    JoinedSplit(s);
    NonEmptyMembers(Split(s));
    ReduceDotFree([], Split(s), Rooted(s));
    assert [] + Segments(s) == Segments(s);
    assert s != "." by {
      SplitPlain(".");
      assert "." in ["."];
    }
  }
}
