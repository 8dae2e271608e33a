/**
 ZooKeeper as the store and the elector see it: a tree of versioned znodes and calls that each
 take effect at once. Versions are unbounded here; ZooKeeper's are int32.
 */
module ZkTree {
  import opened Types
  import opened Paths

  datatype Znode = Znode(data: Bytes, version: int)

  type Tree = map<Path, Znode>

  /** The root exists, every node's parent exists, and every segment names a znode. */
  ghost predicate WellFormed(t: Tree) {
    && [] in t
    && (forall p :: p in t && p != [] ==> p[..|p| - 1] in t)
    && (forall p :: p in t ==> Proper(p))
  }

  function ChildrenOf(t: Tree, p: Path): set<string> {
    set q | q in t && |q| == |p| + 1 && q[..|p|] == p :: q[|p|]
  }

  /** `version` is the caller's expectation; -1 accepts any. */
  predicate Accepts(node: Znode, version: int) {
    version == -1 || version == node.version
  }

  /** What a mutating call leaves behind and what it answers. */
  datatype Effect = Effect(tree: Tree, failure: Option<ZkError>)

  function SetNode(t: Tree, p: Path, data: Bytes, version: int): Effect {
    if p !in t then Effect(t, Some(NoNode))
    else if !Accepts(t[p], version) then Effect(t, Some(BadVersion))
    else Effect(t[p := Znode(data, t[p].version + 1)], None)
  }

  function CreateNode(t: Tree, p: Path, data: Bytes): Effect {
    if p in t then Effect(t, Some(NodeExists))
    else if p == [] || p[..|p| - 1] !in t then Effect(t, Some(NoNode))
    else Effect(t[p := Znode(data, 0)], None)
  }

  function DeleteNode(t: Tree, p: Path, version: int): Effect {
    if p == [] then Effect(t, Some(BadPath))
    else if p !in t then Effect(t, Some(NoNode))
    else if !Accepts(t[p], version) then Effect(t, Some(BadVersion))
    else if ChildrenOf(t, p) != {} then Effect(t, Some(NotEmpty))
    else Effect(t - {p}, None)
  }

  lemma ChildIn(t: Tree, p: Path, child: string)
    ensures child in ChildrenOf(t, p) <==> p + [child] in t
  {
    if p + [child] in t {
      var q := p + [child];
      assert q[..|p|] == p && q[|p|] == child;
    }
    if child in ChildrenOf(t, p) {
      var q :| q in t && |q| == |p| + 1 && q[..|p|] == p && q[|p|] == child;
      assert q == p + [child];
    }
  }

  lemma {:induction false} AncestorsExist(t: Tree, p: Path, k: nat)
    requires WellFormed(t) && p in t && k <= |p|
    ensures p[..k] in t
    decreases |p| - k
  {
    if k < |p| {
      AncestorsExist(t, p, k + 1);
      assert p[..k + 1][..k] == p[..k];
    } else {
      assert p[..k] == p;
    }
  }

  lemma RootExists(t: Tree)
    requires WellFormed(t)
    ensures [] in t
  {
  }

  lemma CreateKeepsForm(t: Tree, p: Path, data: Bytes)
    requires WellFormed(t) && Proper(p)
    ensures WellFormed(CreateNode(t, p, data).tree)
  {
  }

  lemma SetKeepsForm(t: Tree, p: Path, data: Bytes, version: int)
    requires WellFormed(t)
    ensures WellFormed(SetNode(t, p, data, version).tree)
  {
  }

  lemma DeleteKeepsForm(t: Tree, p: Path, version: int)
    requires WellFormed(t)
    ensures WellFormed(DeleteNode(t, p, version).tree)
  {
    hide Proper;
    hide ChildrenOf;
    if DeleteNode(t, p, version).failure.None? {
      var t' := t - {p};
      forall q | q in t' && q != [] ensures q[..|q| - 1] in t' {
        if q[..|q| - 1] == p {
          assert q == p + [q[|q| - 1]];
          ChildIn(t, p, q[|q| - 1]);
        }
      }
      assert WellFormed(t');
    }
  }

  /** One client's connection: the calls take path strings, as the ZooKeeper client's do. */
  class Conn {
    var tree: Tree

    constructor (t: Tree)
      ensures tree == t
    {
      tree := t;
    }

    method Exists(path: string) returns (r: Result<Option<int>>)
      ensures r == match Parse(path)
                   case None => Err(Zk(BadPath))
                   case Some(p) => Ok(if p in tree then Some(tree[p].version) else None)
    {
      match Parse(path)
      case None => return Err(Zk(BadPath));
      case Some(p) => return Ok(if p in tree then Some(tree[p].version) else None);
    }

    method Get(path: string) returns (r: Result<Znode>)
      ensures r == match Parse(path)
                   case None => Err(Zk(BadPath))
                   case Some(p) => if p in tree then Ok(tree[p]) else Err(Zk(NoNode))
    {
      match Parse(path)
      case None => return Err(Zk(BadPath));
      case Some(p) => return if p in tree then Ok(tree[p]) else Err(Zk(NoNode));
    }

    /** The children come in no particular order. */
    method Children(path: string) returns (r: Result<seq<string>>)
      ensures match Parse(path)
              case None => r == Err(Zk(BadPath))
              case Some(p) => if p in tree then r.Ok? && Listing(r.value, ChildrenOf(tree, p))
                              else r == Err(Zk(NoNode))
    {
      match Parse(path)
      case None => return Err(Zk(BadPath));
      case Some(p) =>
        if p !in tree { return Err(Zk(NoNode)); }
        var todo := ChildrenOf(tree, p);
        var listed: seq<string> := [];
        while todo != {}
          invariant NoDuplicates(listed)
          invariant todo <= ChildrenOf(tree, p)
          invariant forall x :: x in listed <==> x in ChildrenOf(tree, p) && x !in todo
        {
          var x :| x in todo;
          listed, todo := listed + [x], todo - {x};
        }
        return Ok(listed);
    }

    method Set(path: string, data: Bytes, version: int) returns (r: Result<int>)
      modifies this
      ensures match Parse(path)
              case None => r == Err(Zk(BadPath)) && tree == old(tree)
              case Some(p) =>
                var e := SetNode(old(tree), p, data, version);
                && tree == e.tree
                && r == if e.failure.Some? then Err(Zk(e.failure.value)) else Ok(tree[p].version)
    {
      match Parse(path)
      case None => return Err(Zk(BadPath));
      case Some(p) =>
        var e := SetNode(tree, p, data, version);
        tree := e.tree;
        return if e.failure.Some? then Err(Zk(e.failure.value)) else Ok(tree[p].version);
    }

    method Create(path: string, data: Bytes) returns (failure: Option<ZkError>)
      modifies this
      ensures match Parse(path)
              case None => failure == Some(BadPath) && tree == old(tree)
              case Some(p) => Effect(tree, failure) == CreateNode(old(tree), p, data)
    {
      match Parse(path)
      case None => return Some(BadPath);
      case Some(p) =>
        var e := CreateNode(tree, p, data);
        tree := e.tree;
        return e.failure;
    }

    method Delete(path: string, version: int) returns (failure: Option<ZkError>)
      modifies this
      ensures match Parse(path)
              case None => failure == Some(BadPath) && tree == old(tree)
              case Some(p) => Effect(tree, failure) == DeleteNode(old(tree), p, version)
    {
      match Parse(path)
      case None => return Some(BadPath);
      case Some(p) =>
        var e := DeleteNode(tree, p, version);
        tree := e.tree;
        return e.failure;
    }
  }
}
