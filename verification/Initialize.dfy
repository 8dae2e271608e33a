/** How an elector prepares its base path (initialize in elector.go), with no other client at work. */
module Initialization {
  import opened Types
  import opened Paths
  import opened ZkTree
  import opened StoreSpec

  /**
   Creates the missing nodes down to the base path, all empty. Unlike setFully it counts a node
   that appears between its check and its create as a failure; alone, that never happens.
   */
  method Initialize(conn: Conn, basePath: string) returns (failure: Option<Error>)
    requires WellFormed(conn.tree)
    modifies conn
    ensures WellFormed(conn.tree)
    ensures match Parse(basePath)
            case None => failure == Some(Zk(BadPath)) && conn.tree == old(conn.tree)
            case Some(p) => failure == None && conn.tree == Filled(old(conn.tree), p, false, [], |p|)
  {
    hide Filled;
    hide WellFormed;
    hide Proper;
    hide Render;
    hide Split;
    hide Parse;
    var present := conn.Exists(basePath);
    if present.Err? {
      return Some(present.error);
    }
    ghost var p, t := Parse(basePath).value, conn.tree;
    RenderParse(basePath);
    RootExists(t);
    if present.value.Some? {
      NothingMissing(t, p);
      return None;
    }
    SplitRender(p);
    FillNone(t, p, false, []);
    var create, segments, i := "/", Split(basePath), 0;
    while i < |segments|
      invariant 0 <= i <= |segments| && segments == [""] + p
      invariant create == (if i == 0 then "/" else Render(p[..i - 1]))
      invariant conn.tree == Filled(t, p, false, [], if i == 0 then 0 else i - 1)
      invariant WellFormed(conn.tree)
    {
      create := Descend(create, segments[i], p, i);
      failure := CreateMissing(conn, create, p, i, t);
      if failure.Some? {
        return;
      }
      i := i + 1;
    }
    failure := None;
  }

  method CreateMissing(conn: Conn, path: string, ghost p: Path, ghost i: nat, ghost t: Tree)
    returns (failure: Option<Error>)
    requires WellFormed(t) && WellFormed(conn.tree) && Proper(p) && i <= |p| && Parse(path) == Some(p[..i])
    requires conn.tree == Filled(t, p, false, [], if i == 0 then 0 else i - 1)
    modifies conn
    ensures WellFormed(conn.tree) && failure == None && conn.tree == Filled(t, p, false, [], i)
  {
    if i > 0 {
      FillNext(t, p, false, [], i - 1);
    } else {
      assert p[..0] == [];
    }
    var present := conn.Exists(path);
    if present.Ok? && present.value.Some? {
      return None;
    }
    CreateKeepsForm(conn.tree, p[..i], []);
    var error := conn.Create(path, []);
    match error
    case None => return None;
    case Some(e) => return Some(Zk(e));
  }

  /** In a tree, a node that exists has all its ancestors: there is nothing to fill in. */
  lemma NothingMissing(t: Tree, p: Path)
    requires WellFormed(t) && p in t
    ensures Filled(t, p, false, [], |p|) == t
  {
    var filled := Filled(t, p, false, [], |p|);
    forall q ensures q in filled <==> q in t {
      FilledMembers(t, p, false, [], |p|, q);
      if |q| <= |p| && q == p[..|q|] {
        AncestorsExist(t, p, |q|);
      }
    }
    assert filled.Keys == t.Keys;
  }
}
