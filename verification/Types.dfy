/** Outcomes shared by every part of the model. */
module Types {

  datatype Option<+T> = None | Some(value: T)

  /** The failures ZooKeeper reports for a single call. */
  datatype ZkError = NoNode | NodeExists | BadVersion | NotEmpty | BadPath

  /** The failures the store reports to its callers. */
  datatype Error =
    | NotConnected
    | OuterSpaces
    | Blank
    | BadCharacters
    | BadCategory
    | DataTooLarge
    | IllegalOption
    | HashFailed
    | VersionConflict
    | NotFound
    | NotCreated
    | Zk(cause: ZkError)

  datatype Result<+T> = Ok(value: T) | Err(error: Error)

  newtype byte = b: int | 0 <= b < 256

  type Bytes = seq<byte>

  ghost predicate NoDuplicates(s: seq<string>) {
    forall i, j :: 0 <= i < j < |s| ==> s[i] != s[j]
  }

  /** `s` enumerates exactly the members of `members`, each once, in some order. */
  ghost predicate Listing(s: seq<string>, members: set<string>) {
    NoDuplicates(s) && forall x :: x in s <==> x in members
  }

  lemma {:induction false} ListingExists(members: set<string>) returns (listing: seq<string>)
    ensures Listing(listing, members)
  {
    if members == {} {
      listing := [];
    } else {
      var x :| x in members;
      var rest := ListingExists(members - {x});
      listing := [x] + rest;
    }
  }
}
